// Patching instruction words of a DOL executable: a manifest of (address,
// expected word, replacement word) rows is applied to the file's text
// sections, and the file is replaced only when every row went through.

module DolSpec {
  import opened Wrappers
  import opened Bytes
  import opened Words

  datatype Patch = Patch(address: U32, expected: U32, replacement: U32)
  datatype Section = Section(address: U32, offset: U32, size: U32)
  datatype Error = Truncated | OutsideFile | Ambiguous | Unmapped | Mismatch
  // The bytes in memory and whether a word of them was written.
  datatype Image = Image(bytes: seq<Byte>, changed: bool)

  const HEADER := 0x100
  const SLOTS := 7

  // Slot i of the header's text tables: offset, load address, size.
  function SectionAt(file: seq<Byte>, i: nat): Section
    requires |file| >= HEADER && i < SLOTS
  {
    Section(Word(file, 0x48 + i * 4), Word(file, i * 4), Word(file, 0x90 + i * 4))
  }

  ghost predicate Inside(sections: seq<Section>, length: nat) {
    forall i :: 0 <= i < |sections| ==> HEADER <= sections[i].offset && sections[i].offset + sections[i].size <= length
  }

  // The non-empty text sections of the first n slots.
  function TextSections(file: seq<Byte>, n: nat): (r: Result<seq<Section>, Error>)
    requires |file| >= HEADER && n <= SLOTS
    ensures r.Ok? ==> Inside(r.value, |file|)
  {
    if n == 0 then Ok([]) else
      match TextSections(file, n - 1)
      case Err(e) => Err(e)
      case Ok(before) =>
        var s := SectionAt(file, n - 1);
        if s.size == 0 then Ok(before)
        else if s.offset < HEADER || s.offset + s.size > |file| then Err(OutsideFile)
        else Ok(before + [s])
  }

  predicate Loads(s: Section, address: U32) {
    address >= s.address && address + 4 <= s.address + s.size
  }

  // Where in the file an address lives.
  function Locate(sections: seq<Section>, address: U32): Result<nat, Error> {
    if sections == [] then Err(Unmapped) else
      var last := sections[|sections| - 1];
      var before := Locate(sections[..|sections| - 1], address);
      if !Loads(last, address) then before
      else if before == Err(Unmapped) then Ok(last.offset + (address - last.address))
      else Err(Ambiguous)
  }

  ghost predicate OnlyAt(sections: seq<Section>, address: U32, i: int) {
    && 0 <= i < |sections| && Loads(sections[i], address)
    && forall j :: 0 <= j < |sections| && j != i ==> !Loads(sections[j], address)
  }

  // An address is placed when exactly one section loads it, and then at its
  // distance from that section's start; no section and several are the errors.
  lemma {:induction false} LocateIsExact(sections: seq<Section>, address: U32)
    ensures match Locate(sections, address)
            case Ok(at) =>
              exists i :: OnlyAt(sections, address, i) && at == sections[i].offset + (address - sections[i].address)
            case Err(Unmapped) => forall i :: 0 <= i < |sections| ==> !Loads(sections[i], address)
            case Err(Ambiguous) =>
              exists i, j :: 0 <= i < j < |sections| && Loads(sections[i], address) && Loads(sections[j], address)
            case Err(_) => false
  {
    if sections != [] {
      var n := |sections| - 1;
      var init := sections[..n];
      LocateIsExact(init, address);
      match Locate(init, address) {
        case Ok(at) =>
          var i :| OnlyAt(init, address, i) && at == init[i].offset + (address - init[i].address);
          assert sections[i] == init[i];
          if !Loads(sections[n], address) { assert OnlyAt(sections, address, i); }
        case Err(Unmapped) =>
          forall j | 0 <= j < n ensures !Loads(sections[j], address) { assert !Loads(init[j], address); }
          if Loads(sections[n], address) { assert OnlyAt(sections, address, n); }
        case Err(Ambiguous) =>
          var i, j :| 0 <= i < j < n && Loads(init[i], address) && Loads(init[j], address);
          assert Loads(sections[i], address) && Loads(sections[j], address);
      }
    }
  }

  lemma LocateInside(sections: seq<Section>, address: U32, length: nat)
    requires Inside(sections, length) && Locate(sections, address).Ok?
    ensures HEADER <= Locate(sections, address).value && Locate(sections, address).value + 4 <= length
  {
    LocateIsExact(sections, address);
    var i :| OnlyAt(sections, address, i) &&
             Locate(sections, address).value == sections[i].offset + (address - sections[i].address);
  }

  function At(sections: seq<Section>, p: Patch): nat
    requires Locate(sections, p.address).Ok?
  {
    Locate(sections, p.address).value
  }

  // One manifest row: a word that already holds its replacement is left, one
  // that holds neither stops the run.
  function Step(image: Image, sections: seq<Section>, p: Patch): (r: Result<Image, Error>)
    requires Inside(sections, |image.bytes|)
    ensures r.Ok? ==> |r.value.bytes| == |image.bytes|
  {
    match Locate(sections, p.address)
    case Err(e) => Err(e)
    case Ok(at) =>
      LocateInside(sections, p.address, |image.bytes|);
      var actual := Word(image.bytes, at);
      if actual == p.replacement then Ok(image)
      else if actual != p.expected then Err(Mismatch)
      else Ok(Image(PutWord(image.bytes, at, p.replacement), true))
  }

  function PatchAll(image: Image, sections: seq<Section>, patches: seq<Patch>): (r: Result<Image, Error>)
    requires Inside(sections, |image.bytes|)
    ensures r.Ok? ==> |r.value.bytes| == |image.bytes|
  {
    if patches == [] then Ok(image) else
      match PatchAll(image, sections, patches[..|patches| - 1])
      case Err(e) => Err(e)
      case Ok(before) => Step(before, sections, patches[|patches| - 1])
  }

  // What a run makes of a file, or why it stops.
  function Patched(file: seq<Byte>, patches: seq<Patch>): Result<Image, Error> {
    if |file| < HEADER then Err(Truncated) else
      match TextSections(file, SLOTS)
      case Err(e) => Err(e)
      case Ok(sections) => PatchAll(Image(file, false), sections, patches)
  }

  // --- Bytes of a word ---

  function ByteOf(w: U32, j: nat): Byte
    requires j < 4
  {
    if j == 0 then w / 256 / 256 / 256
    else if j == 1 then w / 256 / 256 % 256
    else if j == 2 then w / 256 % 256
    else w % 256
  }

  lemma DigitsOf(b0: Byte, b1: Byte, b2: Byte, b3: Byte, w: U32)
    ensures (b0 as int) * 0x1000000 + (b1 as int) * 0x10000 + (b2 as int) * 0x100 + b3 == w <==>
      b0 == w / 256 / 256 / 256 && b1 == w / 256 / 256 % 256 && b2 == w / 256 % 256 && b3 == w % 256
  {}

  lemma WordIsItsBytes(b: seq<Byte>, i: nat, w: U32)
    requires i + 4 <= |b|
    ensures Word(b, i) == w <==> forall j :: 0 <= j < 4 ==> b[i + j] == ByteOf(w, j)
  {
    DigitsOf(b[i + 0], b[i + 1], b[i + 2], b[i + 3], w);
    if forall j :: 0 <= j < 4 ==> b[i + j] == ByteOf(w, j) {
      assert b[i + 0] == ByteOf(w, 0) && b[i + 1] == ByteOf(w, 1);
      assert b[i + 2] == ByteOf(w, 2) && b[i + 3] == ByteOf(w, 3);
    }
    if Word(b, i) == w {
      forall j | 0 <= j < 4 ensures b[i + j] == ByteOf(w, j) {}
    }
  }

  // --- What a successful run leaves ---

  ghost predicate AllLocated(sections: seq<Section>, patches: seq<Patch>) {
    forall i :: 0 <= i < |patches| ==> Locate(sections, patches[i].address).Ok?
  }

  ghost predicate Covers(sections: seq<Section>, p: Patch, k: int) {
    Locate(sections, p.address).Ok? && At(sections, p) <= k < At(sections, p) + 4
  }

  ghost predicate Covered(sections: seq<Section>, patches: seq<Patch>, k: int) {
    exists i :: 0 <= i < |patches| && Covers(sections, patches[i], k)
  }

  // Two rows agree when they put the same value into every byte they share.
  ghost predicate Agree(sections: seq<Section>, p: Patch, q: Patch)
    requires Locate(sections, p.address).Ok? && Locate(sections, q.address).Ok?
  {
    forall k :: Covers(sections, p, k) && Covers(sections, q, k) ==>
      ByteOf(p.replacement, k - At(sections, p)) == ByteOf(q.replacement, k - At(sections, q))
  }

  ghost predicate AllAgree(sections: seq<Section>, patches: seq<Patch>)
    requires AllLocated(sections, patches)
  {
    forall i, j :: 0 <= i < |patches| && 0 <= j < |patches| ==> Agree(sections, patches[i], patches[j])
  }

  ghost predicate InPlace(b: seq<Byte>, sections: seq<Section>, p: Patch) {
    Locate(sections, p.address).Ok? && At(sections, p) + 4 <= |b| && Word(b, At(sections, p)) == p.replacement
  }

  ghost predicate AllInPlace(b: seq<Byte>, sections: seq<Section>, patches: seq<Patch>) {
    forall i :: 0 <= i < |patches| ==> InPlace(b, sections, patches[i])
  }

  lemma {:induction false} SuccessLocatesAll(image: Image, sections: seq<Section>, patches: seq<Patch>)
    requires Inside(sections, |image.bytes|) && PatchAll(image, sections, patches).Ok?
    ensures AllLocated(sections, patches)
  {
    if patches != [] { SuccessLocatesAll(image, sections, patches[..|patches| - 1]); }
  }

  // A run touches no byte outside its target words, and none at all when it
  // reports no change.
  lemma {:induction false} OnlyTargetsChange(image: Image, sections: seq<Section>, patches: seq<Patch>, k: nat)
    requires Inside(sections, |image.bytes|) && PatchAll(image, sections, patches).Ok?
    requires k < |image.bytes| && !Covered(sections, patches, k)
    ensures PatchAll(image, sections, patches).value.bytes[k] == image.bytes[k]
  {
    if patches != [] {
      var n := |patches| - 1;
      var init := patches[..n];
      assert forall i :: 0 <= i < n ==> init[i] == patches[i];
      OnlyTargetsChange(image, sections, init, k);
      assert !Covers(sections, patches[n], k);
      LocateInside(sections, patches[n].address, |image.bytes|);
    }
  }

  lemma {:induction false} UnchangedIsSame(image: Image, sections: seq<Section>, patches: seq<Patch>)
    requires Inside(sections, |image.bytes|) && PatchAll(image, sections, patches).Ok?
    ensures image.changed ==> PatchAll(image, sections, patches).value.changed
    ensures !PatchAll(image, sections, patches).value.changed ==> PatchAll(image, sections, patches).value == image
  {
    if patches != [] { UnchangedIsSame(image, sections, patches[..|patches| - 1]); }
  }

  lemma StepPuts(image: Image, sections: seq<Section>, p: Patch)
    requires Inside(sections, |image.bytes|) && Step(image, sections, p).Ok?
    ensures InPlace(Step(image, sections, p).value.bytes, sections, p)
    ensures forall k :: 0 <= k < |image.bytes| && !Covers(sections, p, k) ==>
      Step(image, sections, p).value.bytes[k] == image.bytes[k]
  {
    LocateInside(sections, p.address, |image.bytes|);
  }

  lemma InPlaceByteIs(b: seq<Byte>, sections: seq<Section>, p: Patch, k: nat)
    requires InPlace(b, sections, p) && Covers(sections, p, k)
    ensures k < |b| && b[k] == ByteOf(p.replacement, k - At(sections, p))
  {
    WordIsItsBytes(b, At(sections, p), p.replacement);
    assert k == At(sections, p) + (k - At(sections, p));
  }

  lemma StepKeepsAgreeing(image: Image, sections: seq<Section>, p: Patch, q: Patch)
    requires Inside(sections, |image.bytes|) && Step(image, sections, p).Ok?
    requires InPlace(image.bytes, sections, q) && Locate(sections, p.address).Ok? && Agree(sections, q, p)
    ensures InPlace(Step(image, sections, p).value.bytes, sections, q)
  {
    StepPuts(image, sections, p);
    var after := Step(image, sections, p).value.bytes;
    var at := At(sections, q);
    forall j | 0 <= j < 4 ensures after[at + j] == ByteOf(q.replacement, j) {
      var k := at + j;
      assert Covers(sections, q, k);
      if Covers(sections, p, k) {
        InPlaceByteIs(after, sections, p, k);
      } else {
        InPlaceByteIs(image.bytes, sections, q, k);
      }
    }
    WordIsItsBytes(after, at, q.replacement);
  }

  lemma {:induction false} AgreeingRunPutsAll(image: Image, sections: seq<Section>, patches: seq<Patch>)
    requires Inside(sections, |image.bytes|) && PatchAll(image, sections, patches).Ok?
    requires AllLocated(sections, patches) && AllAgree(sections, patches)
    ensures AllInPlace(PatchAll(image, sections, patches).value.bytes, sections, patches)
  {
    if patches != [] {
      var n := |patches| - 1;
      var init := patches[..n];
      assert forall i :: 0 <= i < n ==> init[i] == patches[i];
      AgreeingRunPutsAll(image, sections, init);
      var before := PatchAll(image, sections, init).value;
      StepPuts(before, sections, patches[n]);
      forall i | 0 <= i < n ensures InPlace(Step(before, sections, patches[n]).value.bytes, sections, patches[i]) {
        assert InPlace(before.bytes, sections, init[i]);
        assert Agree(sections, patches[i], patches[n]);
        StepKeepsAgreeing(before, sections, patches[n], patches[i]);
      }
    }
  }

  lemma InPlaceAgree(b: seq<Byte>, sections: seq<Section>, p: Patch, q: Patch)
    requires InPlace(b, sections, p) && InPlace(b, sections, q)
    ensures Agree(sections, p, q)
  {
    forall k | Covers(sections, p, k) && Covers(sections, q, k)
      ensures ByteOf(p.replacement, k - At(sections, p)) == ByteOf(q.replacement, k - At(sections, q))
    {
      InPlaceByteIs(b, sections, p, k);
      InPlaceByteIs(b, sections, q, k);
    }
  }

  lemma {:induction false} InPlaceIsFixpoint(image: Image, sections: seq<Section>, patches: seq<Patch>)
    requires Inside(sections, |image.bytes|) && !image.changed
    ensures PatchAll(image, sections, patches) == Ok(image) <==> AllInPlace(image.bytes, sections, patches)
    ensures PatchAll(image, sections, patches).Ok? && !PatchAll(image, sections, patches).value.changed ==>
      PatchAll(image, sections, patches) == Ok(image)
  {
    if patches != [] {
      var n := |patches| - 1;
      var init := patches[..n];
      assert forall i :: 0 <= i < n ==> init[i] == patches[i];
      InPlaceIsFixpoint(image, sections, init);
      if Locate(sections, patches[n].address).Ok? { LocateInside(sections, patches[n].address, |image.bytes|); }
      if PatchAll(image, sections, init).Ok? { UnchangedIsSame(image, sections, init); }
      AllInPlaceSnoc(image.bytes, sections, patches);
    }
  }

  lemma {:induction false} SameHeaderSameSections(file: seq<Byte>, other: seq<Byte>, n: nat)
    requires |file| == |other| >= HEADER && n <= SLOTS
    requires forall k :: 0 <= k < HEADER ==> file[k] == other[k]
    ensures TextSections(file, n) == TextSections(other, n)
  {
    if n > 0 {
      SameHeaderSameSections(file, other, n - 1);
      assert SectionAt(file, n - 1) == SectionAt(other, n - 1);
    }
  }

  lemma HeaderIsNeverATarget(sections: seq<Section>, patches: seq<Patch>, length: nat)
    requires Inside(sections, length)
    ensures forall k :: k < HEADER ==> !Covered(sections, patches, k)
  {
    forall k | k < HEADER ensures !Covered(sections, patches, k) {
      forall i | 0 <= i < |patches| ensures !Covers(sections, patches[i], k) {
        if Locate(sections, patches[i].address).Ok? { LocateInside(sections, patches[i].address, length); }
      }
    }
  }

  ghost function SectionsOf(file: seq<Byte>): seq<Section>
    requires |file| >= HEADER && TextSections(file, SLOTS).Ok?
  {
    TextSections(file, SLOTS).value
  }

  lemma RunKeepsSections(file: seq<Byte>, patches: seq<Patch>)
    requires Patched(file, patches).Ok?
    ensures |Patched(file, patches).value.bytes| == |file|
    ensures TextSections(Patched(file, patches).value.bytes, SLOTS) == TextSections(file, SLOTS)
  {
    var sections := SectionsOf(file);
    var after := Patched(file, patches).value.bytes;
    HeaderIsNeverATarget(sections, patches, |file|);
    forall k | 0 <= k < HEADER ensures file[k] == after[k] {
      OnlyTargetsChange(Image(file, false), sections, patches, k);
    }
    SameHeaderSameSections(file, after, SLOTS);
  }

  // After a run that succeeded, a second run succeeds and reports no change
  // exactly when the rows agree about every file byte they share.
  lemma SecondRunIsNoop(file: seq<Byte>, patches: seq<Patch>)
    requires Patched(file, patches).Ok?
    ensures AllLocated(SectionsOf(file), patches)
    ensures Patched(Patched(file, patches).value.bytes, patches) == Ok(Image(Patched(file, patches).value.bytes, false))
       <==> AllAgree(SectionsOf(file), patches)
  {
    var sections := SectionsOf(file);
    var image := Image(file, false);
    var after := Patched(file, patches).value.bytes;
    SuccessLocatesAll(image, sections, patches);
    RunKeepsSections(file, patches);
    InPlaceIsFixpoint(Image(after, false), sections, patches);
    if AllAgree(sections, patches) { AgreeingRunPutsAll(image, sections, patches); }
    if AllInPlace(after, sections, patches) {
      forall i, j | 0 <= i < |patches| && 0 <= j < |patches| ensures Agree(sections, patches[i], patches[j]) {
        InPlaceAgree(after, sections, patches[i], patches[j]);
      }
    }
  }

  // --- Every starting image ends in the same place ---

  ghost predicate SameOffTargets(file: seq<Byte>, other: seq<Byte>, sections: seq<Section>, patches: seq<Patch>) {
    |file| == |other| && forall k :: 0 <= k < |file| && !Covered(sections, patches, k) ==> file[k] == other[k]
  }

  // Two images that differ only inside the target words, in whatever mixture
  // of expected and replaced, end as one and the same file.
  lemma RunsConverge(file: seq<Byte>, other: seq<Byte>, patches: seq<Patch>)
    requires Patched(file, patches).Ok? && Patched(other, patches).Ok?
    requires SameOffTargets(file, other, SectionsOf(file), patches)
    requires AllLocated(SectionsOf(file), patches) && AllAgree(SectionsOf(file), patches)
    ensures Patched(file, patches).value.bytes == Patched(other, patches).value.bytes
  {
    var sections := SectionsOf(file);
    HeaderIsNeverATarget(sections, patches, |file|);
    SameHeaderSameSections(file, other, SLOTS);
    var a, b := Image(file, false), Image(other, false);
    var x, y := PatchAll(a, sections, patches).value.bytes, PatchAll(b, sections, patches).value.bytes;
    AgreeingRunPutsAll(a, sections, patches);
    AgreeingRunPutsAll(b, sections, patches);
    forall k | 0 <= k < |file| ensures x[k] == y[k] {
      if Covered(sections, patches, k) {
        var i :| 0 <= i < |patches| && Covers(sections, patches[i], k);
        InPlaceByteIs(x, sections, patches[i], k);
        InPlaceByteIs(y, sections, patches[i], k);
      } else {
        OnlyTargetsChange(a, sections, patches, k);
        OnlyTargetsChange(b, sections, patches, k);
      }
    }
  }

  // --- When a run succeeds ---

  // Two target words share no byte.
  predicate Apart(sections: seq<Section>, p: Patch, q: Patch)
    requires Locate(sections, p.address).Ok? && Locate(sections, q.address).Ok?
  {
    At(sections, p) + 4 <= At(sections, q) || At(sections, q) + 4 <= At(sections, p)
  }

  ghost predicate Separated(sections: seq<Section>, patches: seq<Patch>)
    requires AllLocated(sections, patches)
  {
    forall i, j :: 0 <= i < j < |patches| ==> Apart(sections, patches[i], patches[j])
  }

  // The target word holds what the manifest expects, or its replacement.
  ghost predicate Known(b: seq<Byte>, sections: seq<Section>, p: Patch) {
    && Locate(sections, p.address).Ok? && At(sections, p) + 4 <= |b|
    && Word(b, At(sections, p)) in {p.expected, p.replacement}
  }

  lemma WordUntouched(image: Image, sections: seq<Section>, patches: seq<Patch>, at: nat)
    requires Inside(sections, |image.bytes|) && PatchAll(image, sections, patches).Ok? && at + 4 <= |image.bytes|
    requires forall k :: at <= k < at + 4 ==> !Covered(sections, patches, k)
    ensures Word(PatchAll(image, sections, patches).value.bytes, at) == Word(image.bytes, at)
  {
    forall k | at <= k < at + 4 ensures PatchAll(image, sections, patches).value.bytes[k] == image.bytes[k] {
      OnlyTargetsChange(image, sections, patches, k);
    }
    var after := PatchAll(image, sections, patches).value.bytes;
    assert after[at] == image.bytes[at] && after[at + 1] == image.bytes[at + 1];
    assert after[at + 2] == image.bytes[at + 2] && after[at + 3] == image.bytes[at + 3];
  }

  lemma AllInPlaceSnoc(b: seq<Byte>, sections: seq<Section>, patches: seq<Patch>)
    requires patches != []
    ensures AllInPlace(b, sections, patches) <==>
      AllInPlace(b, sections, patches[..|patches| - 1]) && InPlace(b, sections, patches[|patches| - 1])
  {
    var init := patches[..|patches| - 1];
    if AllInPlace(b, sections, patches) {
      forall i | 0 <= i < |init| ensures InPlace(b, sections, init[i]) { assert InPlace(b, sections, patches[i]); }
    }
    if AllInPlace(b, sections, init) && InPlace(b, sections, patches[|patches| - 1]) {
      forall i | 0 <= i < |patches| ensures InPlace(b, sections, patches[i]) {
        if i < |init| { assert InPlace(b, sections, init[i]); }
      }
    }
  }

  ghost predicate AllKnown(b: seq<Byte>, sections: seq<Section>, patches: seq<Patch>) {
    forall i :: 0 <= i < |patches| ==> Known(b, sections, patches[i])
  }

  lemma AllKnownSnoc(b: seq<Byte>, sections: seq<Section>, patches: seq<Patch>)
    requires patches != []
    ensures AllKnown(b, sections, patches) <==>
      AllKnown(b, sections, patches[..|patches| - 1]) && Known(b, sections, patches[|patches| - 1])
  {
    var init := patches[..|patches| - 1];
    if AllKnown(b, sections, patches) {
      forall i | 0 <= i < |init| ensures Known(b, sections, init[i]) { assert Known(b, sections, patches[i]); }
    }
    if AllKnown(b, sections, init) && Known(b, sections, patches[|patches| - 1]) {
      forall i | 0 <= i < |patches| ensures Known(b, sections, patches[i]) {
        if i < |init| { assert Known(b, sections, init[i]); }
      }
    }
  }

  lemma StepSucceedsIff(image: Image, b: seq<Byte>, sections: seq<Section>, p: Patch)
    requires Inside(sections, |b|) && |image.bytes| == |b| && Locate(sections, p.address).Ok?
    requires At(sections, p) + 4 <= |b| && Word(image.bytes, At(sections, p)) == Word(b, At(sections, p))
    ensures Step(image, sections, p).Ok? <==> Known(b, sections, p)
    ensures Step(image, sections, p).Ok? ==>
      (Step(image, sections, p).value.changed <==> image.changed || !InPlace(b, sections, p))
  {}

  lemma LastIsUntouched(image: Image, sections: seq<Section>, patches: seq<Patch>)
    requires patches != [] && AllLocated(sections, patches) && Separated(sections, patches)
    requires Inside(sections, |image.bytes|) && PatchAll(image, sections, patches[..|patches| - 1]).Ok?
    ensures var at := At(sections, patches[|patches| - 1]);
            && at + 4 <= |image.bytes|
            && Word(PatchAll(image, sections, patches[..|patches| - 1]).value.bytes, at) == Word(image.bytes, at)
  {
    var n := |patches| - 1;
    var at := At(sections, patches[n]);
    LocateInside(sections, patches[n].address, |image.bytes|);
    forall k | at <= k < at + 4 ensures !Covered(sections, patches[..n], k) {
      forall i | 0 <= i < n ensures !Covers(sections, patches[..n][i], k) { assert patches[..n][i] == patches[i]; }
    }
    WordUntouched(image, sections, patches[..n], at);
  }

  // With separate target words a run is all or nothing: it goes through
  // exactly when each word of the file as it was is one of its two values,
  // and reports a change exactly when one of them was still the expected one.
  lemma {:induction false} SeparatedRunSucceedsIff(image: Image, sections: seq<Section>, patches: seq<Patch>)
    requires Inside(sections, |image.bytes|) && !image.changed
    requires AllLocated(sections, patches) && Separated(sections, patches)
    ensures PatchAll(image, sections, patches).Ok? <==> AllKnown(image.bytes, sections, patches)
    ensures PatchAll(image, sections, patches).Ok? ==>
      (PatchAll(image, sections, patches).value.changed <==> !AllInPlace(image.bytes, sections, patches))
  {
    if patches != [] {
      var n := |patches| - 1;
      var init := patches[..n];
      assert forall i :: 0 <= i < n ==> init[i] == patches[i];
      SeparatedRunSucceedsIff(image, sections, init);
      AllKnownSnoc(image.bytes, sections, patches);
      AllInPlaceSnoc(image.bytes, sections, patches);
      if PatchAll(image, sections, init).Ok? {
        LastIsUntouched(image, sections, patches);
        StepSucceedsIff(PatchAll(image, sections, init).value, image.bytes, sections, patches[n]);
      }
    }
  }

  // --- Manifests and sections that keep the targets apart ---

  // What the manifest reader accepts.
  ghost predicate Manifest(patches: seq<Patch>) {
    && (forall i :: 0 <= i < |patches| ==> patches[i].address % 4 == 0 && patches[i].expected != patches[i].replacement)
    && (forall i, j :: 0 <= i < j < |patches| ==> patches[i].address < patches[j].address)
  }

  ghost predicate DisjointInFile(sections: seq<Section>) {
    forall i, j :: 0 <= i < j < |sections| ==>
      || sections[i].offset + sections[i].size <= sections[j].offset
      || sections[j].offset + sections[j].size <= sections[i].offset
  }

  lemma DisjointSectionsSeparate(sections: seq<Section>, patches: seq<Patch>)
    requires Manifest(patches) && DisjointInFile(sections) && AllLocated(sections, patches)
    ensures Separated(sections, patches)
  {
    forall i, j | 0 <= i < j < |patches|
      ensures Apart(sections, patches[i], patches[j])
    {
      var a, b := patches[i].address, patches[j].address;
      LocateIsExact(sections, a);
      LocateIsExact(sections, b);
      var s :| OnlyAt(sections, a, s) && At(sections, patches[i]) == sections[s].offset + (a - sections[s].address);
      var t :| OnlyAt(sections, b, t) && At(sections, patches[j]) == sections[t].offset + (b - sections[t].address);
      assert a + 4 <= b;
      if s < t { } else if t < s { } else { }
    }
  }

  lemma SeparatedAgree(sections: seq<Section>, patches: seq<Patch>)
    requires AllLocated(sections, patches) && Separated(sections, patches)
    ensures AllAgree(sections, patches)
  {
    forall i, j | 0 <= i < |patches| && 0 <= j < |patches| ensures Agree(sections, patches[i], patches[j]) {
      if i < j { assert Apart(sections, patches[i], patches[j]); }
      if j < i { assert Apart(sections, patches[j], patches[i]); }
    }
  }

  // With text sections that share no file bytes: a run goes through exactly
  // when every target word is expected or replaced, leaves every word
  // replaced and every other byte alone, and running it again changes nothing.
  lemma DisjointSectionsRun(file: seq<Byte>, patches: seq<Patch>)
    requires Manifest(patches) && |file| >= HEADER && TextSections(file, SLOTS).Ok?
    requires DisjointInFile(SectionsOf(file)) && AllLocated(SectionsOf(file), patches)
    ensures Patched(file, patches).Ok? <==> AllKnown(file, SectionsOf(file), patches)
    ensures Patched(file, patches).Ok? ==>
      var after := Patched(file, patches).value;
      && |after.bytes| == |file|
      && AllInPlace(after.bytes, SectionsOf(file), patches)
      && (forall k :: 0 <= k < |file| && !Covered(SectionsOf(file), patches, k) ==> after.bytes[k] == file[k])
      && (after.changed <==> after.bytes != file)
      && Patched(after.bytes, patches) == Ok(Image(after.bytes, false))
  {
    var sections := SectionsOf(file);
    var image := Image(file, false);
    DisjointSectionsSeparate(sections, patches);
    SeparatedAgree(sections, patches);
    SeparatedRunSucceedsIff(image, sections, patches);
    if Patched(file, patches).Ok? {
      AgreeingRunPutsAll(image, sections, patches);
      forall k | 0 <= k < |file| && !Covered(sections, patches, k)
        ensures Patched(file, patches).value.bytes[k] == file[k] {
        OnlyTargetsChange(image, sections, patches, k);
      }
      UnchangedIsSame(image, sections, patches);
      SecondRunIsNoop(file, patches);
    }
  }

  // Two sections at different addresses and the same file bytes: nothing
  // checks for that, and two rows then patch one word in turn.
  const SHARED: seq<Section> := [Section(0x1000, 0x100, 4), Section(0x2000, 0x100, 4)]
  const CHAINED: seq<Patch> := [Patch(0x1000, 1, 2), Patch(0x2000, 2, 3)]

  ghost predicate SharedLayout(file: seq<Byte>) {
    && |file| == 0x104 && Word(file, 0x100) == 1
    && SectionAt(file, 0) == SHARED[0] && SectionAt(file, 1) == SHARED[1]
    && forall i :: 2 <= i < SLOTS ==> SectionAt(file, i).size == 0
  }

  lemma SharedFileExists() returns (file: seq<Byte>)
    ensures SharedLayout(file)
  {
    file := seq(0x104, i =>
      if i in {0x02, 0x06, 0x103} then 1 else if i in {0x93, 0x97} then 4
      else if i == 0x4A then 0x10 else if i == 0x4E then 0x20 else 0);
  }

  lemma {:induction false} SharedSections(file: seq<Byte>, n: nat)
    requires SharedLayout(file) && 2 <= n <= SLOTS
    ensures TextSections(file, n) == Ok(SHARED)
  {
    if n == 2 {
      assert TextSections(file, 0) == Ok([]) && [] + [SHARED[0]] == [SHARED[0]];
      assert TextSections(file, 1) == Ok([SHARED[0]]) && [SHARED[0]] + [SHARED[1]] == SHARED;
    } else {
      SharedSections(file, n - 1);
      assert SectionAt(file, n - 1).size == 0;
    }
  }

  lemma SharedOffsets()
    ensures Locate(SHARED, 0x1000) == Ok(0x100) && Locate(SHARED, 0x2000) == Ok(0x100)
  {
    assert SHARED[..1] == [SHARED[0]] && [SHARED[0]][..0] == [];
    assert Locate([], 0x1000) == Err(Unmapped) && Locate([], 0x2000) == Err(Unmapped);
    assert Locate([SHARED[0]], 0x1000) == Ok(0x100) && Locate([SHARED[0]], 0x2000) == Err(Unmapped);
  }

  lemma ChainedRuns(b: seq<Byte>)
    requires |b| == 0x104 && Inside(SHARED, |b|)
    ensures Word(b, 0x100) == 1 ==>
      PatchAll(Image(b, false), SHARED, CHAINED) == Ok(Image(PutWord(PutWord(b, 0x100, 2), 0x100, 3), true))
    ensures Word(b, 0x100) == 3 ==> PatchAll(Image(b, false), SHARED, CHAINED) == Err(Mismatch)
  {
    SharedOffsets();
    var image := Image(b, false);
    var once := Image(PutWord(b, 0x100, 2), true);
    assert CHAINED[..1] == [CHAINED[0]] && [CHAINED[0]][..0] == [];
    assert PatchAll(image, SHARED, []) == Ok(image);
    assert PatchAll(image, SHARED, [CHAINED[0]]) == Step(image, SHARED, CHAINED[0]);
    if Word(b, 0x100) == 1 {
      assert Step(image, SHARED, CHAINED[0]) == Ok(once);
      assert PatchAll(image, SHARED, CHAINED) == Step(once, SHARED, CHAINED[1]);
    }
  }

  lemma SharedRuns(file: seq<Byte>)
    requires |file| == 0x104 && TextSections(file, SLOTS) == Ok(SHARED) && Word(file, 0x100) == 1
    ensures Patched(file, CHAINED).Ok? && Patched(file, CHAINED).value.changed
    ensures Patched(Patched(file, CHAINED).value.bytes, CHAINED) == Err(Mismatch)
  {
    ChainedRuns(file);
    RunKeepsSections(file, CHAINED);
    ChainedRuns(Patched(file, CHAINED).value.bytes);
  }

  // The first run succeeds and the second run refuses the file it left.
  lemma SharedSectionsBreakTheSecondRun() returns (file: seq<Byte>)
    ensures Manifest(CHAINED) && Patched(file, CHAINED).Ok? && Patched(file, CHAINED).value.changed
    ensures Patched(Patched(file, CHAINED).value.bytes, CHAINED) == Err(Mismatch)
  {
    file := SharedFileExists();
    SharedSections(file, SLOTS);
    SharedRuns(file);
  }
}

module DolPatch {
  import opened Wrappers
  import opened Bytes
  import opened DolSpec
  import opened Words

  ghost predicate Acceptable(rows: seq<Option<Patch>>) {
    && rows != []
    && (forall i :: 0 <= i < |rows| ==> rows[i].Some? && rows[i].value.address % 4 == 0)
    && (forall i :: 0 <= i < |rows| ==> rows[i].Some? && rows[i].value.expected != rows[i].value.replacement)
    && (forall i, j :: 0 <= i < j < |rows| ==>
          rows[i].Some? && rows[j].Some? && rows[i].value.address < rows[j].value.address)
  }

  // The manifest's rows, None for a line that is not three words: accepted
  // are the non-empty lists of aligned, strictly ascending, changing rows.
  method LoadManifest(rows: seq<Option<Patch>>) returns (r: Option<seq<Patch>>)
    ensures r.Some? <==> Acceptable(rows)
    ensures r.Some? ==>
      Manifest(r.value) && |r.value| == |rows| && forall i :: 0 <= i < |rows| ==> rows[i] == Some(r.value[i])
  {
    var patches: seq<Patch> := [];
    var previous: U32 := 0;
    var first := true;
    for n := 0 to |rows|
      invariant |patches| == n && first == (n == 0)
      invariant forall i :: 0 <= i < n ==> rows[i] == Some(patches[i])
      invariant n > 0 ==> previous == patches[n - 1].address
      invariant Manifest(patches)
    {
      if rows[n] == None { return None; }
      var p := rows[n].value;
      if p.address % 4 != 0 || p.expected == p.replacement || (!first && p.address <= previous) {
        if n > 0 { assert rows[n - 1] == Some(patches[n - 1]); }
        return None;
      }
      patches := patches + [p];
      previous := p.address;
      first := false;
    }
    if patches == [] { return None; }
    return Some(patches);
  }

  method FindSection(sections: seq<Section>, address: U32) returns (r: Result<nat, Error>)
    ensures r == Locate(sections, address)
  {
    r := Err(Unmapped);
    for i := 0 to |sections|
      invariant r == Locate(sections[..i], address)
    {
      assert sections[..i + 1][..i] == sections[..i];
      var s := sections[i];
      if Loads(s, address) {
        if r != Err(Unmapped) {
          AmbiguousStays(sections, address, i + 1);
          return Err(Ambiguous);
        }
        r := Ok(s.offset + (address - s.address));
      }
    }
    assert sections[..|sections|] == sections;
  }

  lemma {:induction false} AmbiguousStays(sections: seq<Section>, address: U32, n: nat)
    requires n <= |sections| && Locate(sections[..n], address) == Err(Ambiguous)
    ensures Locate(sections, address) == Err(Ambiguous)
  {
    if n == |sections| {
      assert sections[..n] == sections;
    } else {
      assert sections[..|sections| - 1][..n] == sections[..n];
      AmbiguousStays(sections[..|sections| - 1], address, n);
    }
  }

  method ReadSections(file: seq<Byte>) returns (r: Result<seq<Section>, Error>)
    requires |file| >= HEADER
    ensures r == TextSections(file, SLOTS)
  {
    var sections: seq<Section> := [];
    for i := 0 to SLOTS
      invariant TextSections(file, i) == Ok(sections)
    {
      var s := SectionAt(file, i);
      if s.size != 0 {
        if s.offset < HEADER || s.offset + s.size > |file| {
          OutsideStays(file, i + 1);
          return Err(OutsideFile);
        }
        sections := sections + [s];
      }
    }
    return Ok(sections);
  }

  lemma {:induction false} OutsideStays(file: seq<Byte>, n: nat)
    requires |file| >= HEADER && n <= SLOTS && TextSections(file, n) == Err(OutsideFile)
    ensures TextSections(file, SLOTS) == Err(OutsideFile)
    decreases SLOTS - n
  {
    if n < SLOTS { OutsideStays(file, n + 1); }
  }

  lemma {:induction false} ErrorStays(image: Image, sections: seq<Section>, patches: seq<Patch>, n: nat, e: Error)
    requires Inside(sections, |image.bytes|) && n <= |patches| && PatchAll(image, sections, patches[..n]) == Err(e)
    ensures PatchAll(image, sections, patches) == Err(e)
  {
    if n == |patches| {
      assert patches[..n] == patches;
    } else {
      assert patches[..|patches| - 1][..n] == patches[..n];
      ErrorStays(image, sections, patches[..|patches| - 1], n, e);
    }
  }

  // Some run of rows from the start went through and wrote a word: what the
  // caller's flag says, also when a later row stops the run.
  ghost predicate Touched(file: seq<Byte>, patches: seq<Patch>) {
    && |file| >= HEADER && TextSections(file, SLOTS).Ok?
    && exists n :: 0 <= n <= |patches| && Wrote(file, TextSections(file, SLOTS).value, patches, n)
  }

  ghost predicate Wrote(file: seq<Byte>, sections: seq<Section>, patches: seq<Patch>, n: int)
    requires Inside(sections, |file|) && 0 <= n <= |patches|
  {
    var r := PatchAll(Image(file, false), sections, patches[..n]);
    r.Ok? && r.value.changed
  }

  lemma {:induction false} WroteStays(file: seq<Byte>, sections: seq<Section>, patches: seq<Patch>, n: nat, i: nat)
    requires Inside(sections, |file|) && n <= i <= |patches| && Wrote(file, sections, patches, n)
    requires PatchAll(Image(file, false), sections, patches[..i]).Ok?
    ensures Wrote(file, sections, patches, i)
    decreases i
  {
    if n < i {
      assert patches[..i][..i - 1] == patches[..i - 1];
      WroteStays(file, sections, patches, n, i - 1);
    }
  }

  // The flag of the loop, where the run ends or stops.
  lemma TouchedAtStop(file: seq<Byte>, patches: seq<Patch>, i: nat, image: Image)
    requires |file| >= HEADER && TextSections(file, SLOTS).Ok? && i <= |patches|
    requires PatchAll(Image(file, false), TextSections(file, SLOTS).value, patches[..i]) == Ok(image)
    requires i < |patches| ==> PatchAll(Image(file, false), TextSections(file, SLOTS).value, patches[..i + 1]).Err?
    ensures Touched(file, patches) <==> image.changed
  {
    hide PatchAll;
    hide TextSections;
    var sections := TextSections(file, SLOTS).value;
    if image.changed { assert Wrote(file, sections, patches, i); }
    if Touched(file, patches) {
      var n :| 0 <= n <= |patches| && Wrote(file, sections, patches, n);
      if n > i {
        assert patches[..n][..i + 1] == patches[..i + 1];
        var e := PatchAll(Image(file, false), sections, patches[..i + 1]).error;
        ErrorStays(Image(file, false), sections, patches[..n], i + 1, e);
      } else {
        WroteStays(file, sections, patches, n, i);
      }
    }
  }

  // The executable on disk; replacements counts the times it was swapped for
  // a new one.
  class DolFile {
    var contents: seq<Byte>
    var replacements: nat

    // An error, and a run that finds nothing to do, leave the file unwritten.
    // The flag says what was written in memory, even where the run stopped.
    method Apply(patches: seq<Patch>) returns (error: Option<Error>, changed: bool)
      modifies this
      ensures changed <==> Touched(old(contents), patches)
      ensures match Patched(old(contents), patches)
              case Err(e) => error == Some(e) && contents == old(contents) && replacements == old(replacements)
              case Ok(image) =>
                && error == None && contents == image.bytes && changed == image.changed
                && replacements == old(replacements) + (if changed then 1 else 0)
    {
      var bytes := contents;
      if |bytes| < HEADER { return Some(Truncated), false; }
      var found := ReadSections(bytes);
      if found.Err? { return Some(found.error), false; }
      var sections := found.value;
      ghost var read := bytes;
      ghost var start := Image(bytes, false);
      hide PatchAll;
      hide Touched;
      PatchNone(start, sections, patches);
      changed := false;
      for i := 0 to |patches|
        invariant |bytes| == |start.bytes| && PatchAll(start, sections, patches[..i]) == Ok(Image(bytes, changed))
        invariant contents == old(contents) && replacements == old(replacements)
      {
        PatchNext(start, sections, patches, i);
        ghost var before := Image(bytes, changed);
        error, bytes, changed := ApplyRow(bytes, changed, sections, patches[i]);
        if error.Some? {
          ErrorStays(start, sections, patches, i + 1, error.value);
          TouchedAtStop(read, patches, i, before);
          return;
        }
      }
      assert patches[..|patches|] == patches;
      TouchedAtStop(read, patches, |patches|, Image(bytes, changed));
      UnchangedIsSame(start, sections, patches);
      if changed { contents, replacements := bytes, replacements + 1; }
      return None, changed;
    }
  }

  lemma PatchNone(start: Image, sections: seq<Section>, patches: seq<Patch>)
    requires Inside(sections, |start.bytes|)
    ensures PatchAll(start, sections, patches[..0]) == Ok(start)
  {}

  lemma PatchNext(start: Image, sections: seq<Section>, patches: seq<Patch>, i: nat)
    requires Inside(sections, |start.bytes|) && i < |patches| && PatchAll(start, sections, patches[..i]).Ok?
    ensures PatchAll(start, sections, patches[..i + 1])
         == Step(PatchAll(start, sections, patches[..i]).value, sections, patches[i])
  {
    assert patches[..i + 1][..i] == patches[..i];
  }

  // The loop's body: place the row, compare, write.
  method ApplyRow(bytes: seq<Byte>, changed: bool, sections: seq<Section>, p: Patch)
    returns (error: Option<Error>, after: seq<Byte>, changed': bool)
    requires Inside(sections, |bytes|)
    ensures match Step(Image(bytes, changed), sections, p)
            case Err(e) => error == Some(e) && after == bytes && changed' == changed
            case Ok(image) => error == None && image == Image(after, changed')
  {
    error, after, changed' := None, bytes, changed;
    var place := FindSection(sections, p.address);
    if place.Err? { return Some(place.error), bytes, changed; }
    LocateInside(sections, p.address, |bytes|);
    var actual := Word(bytes, place.value);
    if actual != p.replacement {
      if actual != p.expected { return Some(Mismatch), bytes, changed; }
      after := PutWord(bytes, place.value, p.replacement);
      changed' := true;
    }
  }
}
